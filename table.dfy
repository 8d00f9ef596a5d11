/**
 * The table-driven automata of finite_automaton.py: a DFA whose transition mappings give one
 * next state per symbol, and an NFA whose mappings give a set of next states per symbol, the
 * empty symbol "" labelling epsilon transitions.
 */
module TableAutomata {
  import opened Wrappers
  import opened Reach
  import Closures
  import Simulation

  /** The five-tuple of FiniteAutomaton; T is what a transition leads to. */
  datatype Automaton<T> = Automaton(
    states: set<string>,
    alphabet: set<string>,
    transitionMappings: map<string, map<string, T>>,
    startState: Option<string>,
    acceptingStates: set<string>)

  /** FiniteAutomaton.__init__: a missing collection becomes empty; the start state may stay None. */
  function NewAutomaton<T>(
    states: Option<set<string>>, alphabet: Option<set<string>>,
    transitionMappings: Option<map<string, map<string, T>>>,
    startState: Option<string>, acceptingStates: Option<set<string>>): (fa: Automaton<T>)
    ensures states.Some? ==> fa.states == states.value
    ensures states.None? ==> fa.states == {}
    ensures alphabet.Some? ==> fa.alphabet == alphabet.value
    ensures alphabet.None? ==> fa.alphabet == {}
    ensures transitionMappings.Some? ==> fa.transitionMappings == transitionMappings.value
    ensures transitionMappings.None? ==> fa.transitionMappings == map[]
    ensures fa.startState == startState
    ensures acceptingStates.Some? ==> fa.acceptingStates == acceptingStates.value
    ensures acceptingStates.None? ==> fa.acceptingStates == {}
  {
    Automaton(
      if states.Some? then states.value else {},
      if alphabet.Some? then alphabet.value else {},
      if transitionMappings.Some? then transitionMappings.value else map[],
      startState,
      if acceptingStates.Some? then acceptingStates.value else {})
  }

  // ---------------------------------------------------------------------------------------------
  // DeterministicFiniteAutomaton

  /** transition_mappings.get(q, {}).get(a): None when there is no current state or no entry. */
  function DfaStep(tm: map<string, map<string, string>>, q: Option<string>, a: char): Option<string> {
    if q.Some? && q.value in tm && [a] in tm[q.value] then Some(tm[q.value][[a]]) else None
  }

  /** The state after reading w; None once a transition is missing. */
  function DfaRun(tm: map<string, map<string, string>>, q: Option<string>, w: string): Option<string>
    decreases |w|
  {
    if w == [] then q else DfaRun(tm, DfaStep(tm, q, w[0]), w[1..])
  }

  /** p is a walk of the DFA spelling w: one mapped transition per symbol. */
  ghost predicate DfaPath(tm: map<string, map<string, string>>, p: seq<string>, w: string) {
    && |p| == |w| + 1
    && forall i :: 0 <= i < |w| ==> p[i] in tm && [w[i]] in tm[p[i]] && tm[p[i]][[w[i]]] == p[i + 1]
  }

  /** A missing transition is final: nothing leads out of None. */
  lemma {:induction false} DfaRunDead(tm: map<string, map<string, string>>, w: string)
    ensures DfaRun(tm, None, w) == None
    decreases |w|
  {
    if w != [] {
      DfaRunDead(tm, w[1..]);
    }
  }

  /** A walk extended at the front by the transition on w[0] spells w. */
  lemma DfaPathCons(tm: map<string, map<string, string>>, q: string, p: seq<string>, w: string)
    requires |w| > 0 && DfaPath(tm, p, w[1..])
    requires q in tm && [w[0]] in tm[q] && tm[q][[w[0]]] == p[0]
    ensures DfaPath(tm, [q] + p, w)
  {
    var p' := [q] + p;
    forall i | 0 <= i < |w|
      ensures p'[i] in tm && [w[i]] in tm[p'[i]] && tm[p'[i]][[w[i]]] == p'[i + 1]
    {
      if i > 0 {
        assert p'[i] == p[i - 1] && p'[i + 1] == p[i] && w[i] == w[1..][i - 1];
      }
    }
  }

  /** A walk spelling w, without its first state, spells the rest of w. */
  lemma DfaPathTail(tm: map<string, map<string, string>>, p: seq<string>, w: string)
    requires |w| > 0 && DfaPath(tm, p, w)
    ensures DfaPath(tm, p[1..], w[1..])
  {
    var p', w' := p[1..], w[1..];
    forall i | 0 <= i < |w'|
      ensures p'[i] in tm && [w'[i]] in tm[p'[i]] && tm[p'[i]][[w'[i]]] == p'[i + 1]
    {
      assert p'[i] == p[i + 1] && p'[i + 1] == p[i + 2] && w'[i] == w[i + 1];
    }
  }

  /** The run follows exactly one transition per symbol: it reaches r iff a walk spells w to r. */
  lemma {:induction false} DfaRunIsPath(tm: map<string, map<string, string>>, q: string, w: string, r: string)
    ensures DfaRun(tm, Some(q), w) == Some(r) <==> exists p :: DfaPath(tm, p, w) && p[0] == q && p[|w|] == r
    decreases |w|
  {
    if w == [] {
      if DfaRun(tm, Some(q), w) == Some(r) {
        assert DfaPath(tm, [q], w);
      }
    } else {
      var next := DfaStep(tm, Some(q), w[0]);
      if next.None? {
        DfaRunDead(tm, w[1..]);
        forall p | DfaPath(tm, p, w)
          ensures p[0] != q
        {
        }
      } else {
        var q' := next.value;
        DfaRunIsPath(tm, q', w[1..], r);
        if DfaRun(tm, Some(q), w) == Some(r) {
          var p' :| DfaPath(tm, p', w[1..]) && p'[0] == q' && p'[|w| - 1] == r;
          DfaPathCons(tm, q, p', w);
          assert ([q] + p')[|w|] == r;
        }
        if p :| DfaPath(tm, p, w) && p[0] == q && p[|w|] == r {
          DfaPathTail(tm, p, w);
          assert p[1..][0] == q' && p[1..][|w| - 1] == r;
        }
      }
    }
  }

  /** Reading u then v is reading u + v. */
  lemma {:induction false} DfaRunAppend(tm: map<string, map<string, string>>, q: Option<string>, u: string, v: string)
    ensures DfaRun(tm, q, u + v) == DfaRun(tm, DfaRun(tm, q, u), v)
    decreases |u|
  {
    if u == [] {
      assert u + v == v;
    } else {
      assert (u + v)[0] == u[0] && (u + v)[1..] == u[1..] + v;
      DfaRunAppend(tm, DfaStep(tm, q, u[0]), u[1..], v);
    }
  }

  /** DFA acceptance: the walk ends in an accepting state (a missing transition rejects). */
  ghost predicate DfaLanguage(fa: Automaton<string>, w: string) {
    var r := DfaRun(fa.transitionMappings, fa.startState, w);
    r.Some? && r.value in fa.acceptingStates
  }

  /** DeterministicFiniteAutomaton.accepts: one transition per symbol, stopping at a missing one. */
  method DfaAccepts(fa: Automaton<string>, w: string) returns (accepted: bool)
    ensures accepted <==> DfaLanguage(fa, w)
  {
    var tm := fa.transitionMappings;
    var current := fa.startState;
    for i := 0 to |w|
      invariant DfaRun(tm, fa.startState, w) == DfaRun(tm, current, w[i..])
    {
      assert w[i..] == [w[i]] + w[i + 1..];
      current := DfaStep(tm, current, w[i]);
      if current.None? {
        DfaRunDead(tm, w[i + 1..]);
        break;
      }
    }
    accepted := current.Some? && current.value in fa.acceptingStates;
  }

  /** The DFA of the unit tests: it spells "new" and "not". */
  function TestDfa(): Automaton<string> {
    Automaton(
      {"s0", "s1", "s2", "s3", "s4", "s5"},
      {"n", "e", "w", "o", "t"},
      map["s0" := map["n" := "s1"], "s1" := map["e" := "s2", "o" := "s4"],
          "s2" := map["w" := "s3"], "s4" := map["t" := "s5"]],
      Some("s0"),
      {"s3", "s5"})
  }

  lemma DfaTestAccepts()
    ensures DfaLanguage(TestDfa(), "new") && DfaLanguage(TestDfa(), "not")
  {
    var tm := TestDfa().transitionMappings;
    assert DfaRun(tm, Some("s2"), "w") == Some("s3");
    assert DfaRun(tm, Some("s1"), "ew") == Some("s3");
    assert DfaRun(tm, Some("s4"), "t") == Some("s5");
    assert DfaRun(tm, Some("s1"), "ot") == Some("s5");
  }

  lemma DfaTestRejects()
    ensures !DfaLanguage(TestDfa(), "nwt") && !DfaLanguage(TestDfa(), "anew")
    ensures !DfaLanguage(TestDfa(), "notnot")
  {
    var tm := TestDfa().transitionMappings;
    DfaRunDead(tm, "t");
    DfaRunDead(tm, "new");
    DfaRunDead(tm, "ot");
    assert DfaRun(tm, Some("s1"), "wt") == None;
    assert DfaRun(tm, Some("s5"), "not") == None;
    assert DfaRun(tm, Some("s4"), "tnot") == None;
    assert DfaRun(tm, Some("s1"), "otnot") == None;
  }

  // ---------------------------------------------------------------------------------------------
  // NondeterministicFiniteAutomaton

  /** The epsilon edges of the mappings: the "" entry of each state. */
  function EpsilonEdges(tm: map<string, map<string, set<string>>>): map<string, set<string>> {
    map k | k in tm && "" in tm[k] :: tm[k][""]
  }

  /** transition_mappings.get(e, {}).get(a, {}): a one-symbol key is never the epsilon key. */
  function Targets(tm: map<string, map<string, set<string>>>, e: string, a: char): set<string> {
    if e in tm && [a] in tm[e] then tm[e][[a]] else {}
  }

  function Delta(tm: map<string, map<string, set<string>>>): (string, char) -> set<string> {
    (e, a) => Targets(tm, e, a)
  }

  /** The inner loop of __create_epsilon_predecessors: k is added under every state of targets. */
  method RecordPredecessor(preds: map<string, set<string>>, k: string, targets: set<string>)
    returns (preds': map<string, set<string>>)
    ensures forall k', s :: k' in Succ(preds', s) <==> k' in Succ(preds, s) || (k' == k && s in targets)
  {
    preds' := preds;
    var pending := targets;
    while pending != {}
      invariant pending <= targets
      invariant forall k', s :: k' in Succ(preds', s) <==> k' in Succ(preds, s) || (k' == k && s in targets - pending)
      decreases |pending|
    {
      var s :| s in pending;
      ghost var before, rest := preds', pending;
      preds' := preds'[s := Succ(preds', s) + {k}];
      pending := pending - {s};
      forall k', x
        ensures k' in Succ(preds', x) <==> k' in Succ(preds, x) || (k' == k && x in targets - pending)
      {
        if x == s {
          assert Succ(preds', x) == Succ(before, x) + {k};
        } else {
          assert Succ(preds', x) == Succ(before, x);
          assert x in targets - pending <==> x in targets - rest;
        }
      }
    }
  }

  /** __create_epsilon_predecessors: k is recorded under s exactly when s is an epsilon target of k. */
  method EpsilonPredecessors(tm: map<string, map<string, set<string>>>) returns (preds: map<string, set<string>>)
    ensures forall k, s :: k in Succ(preds, s) <==> s in Succ(EpsilonEdges(tm), k)
  {
    preds := map[];
    var keys := tm.Keys;
    while keys != {}
      invariant keys <= tm.Keys
      invariant forall k, s :: k in Succ(preds, s) <==> k in tm.Keys - keys && s in Succ(EpsilonEdges(tm), k)
      decreases |keys|
    {
      var k :| k in keys;
      if "" in tm[k] {
        preds := RecordPredecessor(preds, k, tm[k][""]);
      }
      assert Succ(EpsilonEdges(tm), k) == if "" in tm[k] then tm[k][""] else {};
      ghost var before := keys;
      keys := keys - {k};
      assert forall k' :: k' in tm.Keys - keys <==> k' in tm.Keys - before || k' == k;
    }
  }

  /** An NFA with its precomputed closures, keyed by state. */
  datatype Nfa = Nfa(fa: Automaton<set<string>>, epsilonClosures: map<string, set<string>>)

  /**
   * NondeterministicFiniteAutomaton.__init__ as written. The closures are computed from the
   * argument `states` itself, so a missing state set raises TypeError even though the stored set
   * defaults to empty; an epsilon target that is not a state has no closure to read and raises
   * KeyError. Otherwise the closures are one sweep of the work list in its pop order, which the
   * program leaves to the set and which is returned as `order`.
   */
  method NewNfa(
    states: Option<set<string>>, alphabet: Option<set<string>>,
    transitionMappings: Option<map<string, map<string, set<string>>>>,
    startState: Option<string>, acceptingStates: Option<set<string>>)
    returns (r: Result<Nfa>, ghost order: seq<string>)
    ensures states.None? ==> r == Err(TypeError)
    ensures var fa := NewAutomaton(states, alphabet, transitionMappings, startState, acceptingStates);
      states.Some? ==> (r.Ok? <==> Closures.TargetsAreStates(states.value, EpsilonEdges(fa.transitionMappings)))
    ensures r.Err? ==> r.error in {TypeError, KeyError}
    ensures r.Ok? ==> r.value.fa == NewAutomaton(states, alphabet, transitionMappings, startState, acceptingStates)
    ensures r.Ok? ==> Closures.IsEnumeration(order, r.value.fa.states)
    ensures r.Ok? ==>
      r.value.epsilonClosures == Closures.Sweep(EpsilonEdges(r.value.fa.transitionMappings), order, Closures.Initial(r.value.fa.states))
    ensures r.Ok? ==> r.value.epsilonClosures.Keys == r.value.fa.states
    ensures r.Ok? ==> forall s :: s in r.value.fa.states ==> s in r.value.epsilonClosures[s]
    ensures r.Ok? ==> forall s, t :: s in r.value.fa.states && t in r.value.epsilonClosures[s] ==>
      Reaches(EpsilonEdges(r.value.fa.transitionMappings), s, t)
  {
    var fa := NewAutomaton(states, alphabet, transitionMappings, startState, acceptingStates);
    var preds := EpsilonPredecessors(fa.transitionMappings);
    order := [];
    if states.None? {
      return Err(TypeError), order;
    }
    var succ := EpsilonEdges(fa.transitionMappings);
    if !Closures.TargetsAreStates(states.value, succ) {
      return Err(KeyError), order;
    }
    var cl;
    cl, order := Closures.EpsilonClosuresAsWritten(states.value, succ);
    r := Ok(Nfa(fa, cl));
  }

  /**
   * The constructor with the corrected work list (Closures.EpsilonClosures), which puts the
   * predecessors of a grown closure back on the work list: the same errors, and every listed
   * state gets its exact epsilon closure.
   */
  method NewNfaCorrected(
    states: Option<set<string>>, alphabet: Option<set<string>>,
    transitionMappings: Option<map<string, map<string, set<string>>>>,
    startState: Option<string>, acceptingStates: Option<set<string>>) returns (r: Result<Nfa>)
    ensures states.None? ==> r == Err(TypeError)
    ensures var fa := NewAutomaton(states, alphabet, transitionMappings, startState, acceptingStates);
      states.Some? ==> (r.Ok? <==> Closures.TargetsAreStates(states.value, EpsilonEdges(fa.transitionMappings)))
    ensures r.Err? ==> r.error in {TypeError, KeyError}
    ensures r.Ok? ==> r.value.fa == NewAutomaton(states, alphabet, transitionMappings, startState, acceptingStates)
    ensures r.Ok? ==> IsClosureMap(EpsilonEdges(r.value.fa.transitionMappings), r.value.fa.states, r.value.epsilonClosures)
  {
    var fa := NewAutomaton(states, alphabet, transitionMappings, startState, acceptingStates);
    var preds := EpsilonPredecessors(fa.transitionMappings);
    if states.None? {
      return Err(TypeError);
    }
    var succ := EpsilonEdges(fa.transitionMappings);
    if !Closures.TargetsAreStates(states.value, succ) {
      return Err(KeyError);
    }
    var cl := Closures.EpsilonClosures(states.value, succ, preds);
    r := Ok(Nfa(fa, cl));
  }

  /** accepts as written (finite_automaton.py): no closure after the last symbol. */
  function NfaAcceptsAsWritten(n: Nfa, w: string): Result<bool> {
    match n.fa.startState
    case None => if w == [] then Ok(false) else Err(KeyError)
    case Some(q) =>
      Simulation.AcceptsAsWritten(n.epsilonClosures, Delta(n.fa.transitionMappings), q, n.fa.acceptingStates, w)
  }

  /** accepts with the closure of the final state set taken before the test. */
  function NfaAcceptance(n: Nfa, w: string): Result<bool> {
    match n.fa.startState
    case None => if w == [] then Ok(false) else Err(KeyError)
    case Some(q) =>
      Simulation.Accepts(n.epsilonClosures, Delta(n.fa.transitionMappings), q, n.fa.acceptingStates, w)
  }

  /** The closures are exact and no edge leaves the states; the start state is one of them. */
  ghost predicate WellFormed(n: Nfa) {
    && IsClosureMap(EpsilonEdges(n.fa.transitionMappings), n.fa.states, n.epsilonClosures)
    && Simulation.Closed(EpsilonEdges(n.fa.transitionMappings), Delta(n.fa.transitionMappings), n.fa.states)
    && n.fa.startState.Some? && n.fa.startState.value in n.fa.states
  }

  /** The NFA's language: some derivation of w from the start state ends in an accepting state. */
  ghost predicate NfaLanguage(n: Nfa, w: string)
    requires n.fa.startState.Some?
  {
    Simulation.InLanguage(EpsilonEdges(n.fa.transitionMappings), Delta(n.fa.transitionMappings),
      n.fa.startState.value, n.fa.acceptingStates, w)
  }

  /**
   * NondeterministicFiniteAutomaton.accepts, with the final closure: the current-state set is
   * stepped through the input and tested against the accepting states. On a well-formed NFA the
   * answer is membership in its language.
   */
  method NfaAccepts(n: Nfa, w: string) returns (r: Result<bool>)
    ensures r == NfaAcceptance(n, w)
    ensures WellFormed(n) ==> r == Ok(NfaLanguage(n, w))
  {
    if n.fa.startState.None? {
      return if w == [] then Ok(false) else Err(KeyError);
    }
    var q := n.fa.startState.value;
    var cl := n.epsilonClosures;
    var delta := Delta(n.fa.transitionMappings);
    var current := {q};
    if WellFormed(n) {
      Simulation.AcceptsIsLanguage(EpsilonEdges(n.fa.transitionMappings), delta, n.fa.states, cl,
        q, n.fa.acceptingStates, w);
    }
    for i := 0 to |w|
      invariant Simulation.Run(cl, delta, {q}, w) == Simulation.Run(cl, delta, current, w[i..])
    {
      assert w[i..] == [w[i]] + w[i + 1..];
      var next := Simulation.Step(cl, delta, current, w[i]);
      if next.Err? {
        return Err(KeyError);
      }
      current := next.value;
    }
    assert w[|w|..] == [];
    if !(current <= cl.Keys) {
      return Err(KeyError);
    }
    r := Ok(Simulation.Close(cl, current) * n.fa.acceptingStates != {});
  }

  /**
   * accepts as written, on a well-formed NFA: it raises nothing, every word it accepts is in the
   * language, and the empty word is accepted exactly when the start state is accepting.
   */
  lemma NfaAcceptsAsWrittenSound(n: Nfa, w: string)
    requires WellFormed(n)
    ensures NfaAcceptsAsWritten(n, w).Ok?
    ensures NfaAcceptsAsWritten(n, w).value ==> NfaLanguage(n, w)
    ensures NfaAcceptsAsWritten(n, []) == Ok(n.fa.startState.value in n.fa.acceptingStates)
  {
    Simulation.AcceptsAsWrittenSound(EpsilonEdges(n.fa.transitionMappings), Delta(n.fa.transitionMappings),
      n.fa.states, n.epsilonClosures, n.fa.startState.value, n.fa.acceptingStates, w);
  }

  /** The NFA of the unit tests: a*ab, through an epsilon edge from s0 to s1. */
  function TestNfaMappings(): map<string, map<string, set<string>>> {
    map["s0" := map["a" := {"s0"}, "" := {"s1"}], "s1" := map["a" := {"s2"}], "s2" := map["b" := {"s3"}]]
  }

  function TestNfaClosures(): map<string, set<string>> {
    map["s0" := {"s0", "s1"}, "s1" := {"s1"}, "s2" := {"s2"}, "s3" := {"s3"}]
  }

  function TestNfa(cl: map<string, set<string>>): Nfa {
    Nfa(Automaton({"s0", "s1", "s2", "s3"}, {"a", "b"}, TestNfaMappings(), Some("s0"), {"s3"}), cl)
  }

  lemma TestNfaEpsilonEdges()
    ensures EpsilonEdges(TestNfaMappings()) == map["s0" := {"s1"}]
  {
    var tm := TestNfaMappings();
    assert "" in tm["s0"] && "" !in tm["s1"] && "" !in tm["s2"];
    assert EpsilonEdges(tm).Keys == {"s0"};
  }

  /**
   * Any exact closure map of the test NFA is the expected one: what the corrected constructor
   * computes (TestNfaSweep gives the same for the constructor as written).
   */
  lemma TestNfaClosuresExact(cl: map<string, set<string>>)
    requires IsClosureMap(EpsilonEdges(TestNfaMappings()), {"s0", "s1", "s2", "s3"}, cl)
    ensures cl == TestNfaClosures()
  {
    var succ: map<string, set<string>> := map["s0" := {"s1"}];
    TestNfaEpsilonEdges();
    assert IsPath(succ, ["s0", "s1"]);
    forall s | s in {"s1", "s2", "s3"}
      ensures cl[s] == {s}
    {
      ReachesRefl(succ, s);
      forall t | t in cl[s]
        ensures t == s
      {
        ReachesWithin(succ, {s}, s, t);
      }
    }
    ReachesRefl(succ, "s0");
    forall t | t in cl["s0"]
      ensures t in {"s0", "s1"}
    {
      ReachesWithin(succ, {"s0", "s1"}, "s0", t);
    }
    assert cl["s0"] == {"s0", "s1"};
  }

  /** Closures of the test NFA that are sound and hold s0's epsilon target are closed. */
  lemma TestNfaClosedClosures(succ: map<string, set<string>>, r: map<string, set<string>>)
    requires succ == map["s0" := {"s1"}] && r.Keys == {"s0", "s1", "s2", "s3"}
    requires "s1" in r["s0"]
    requires forall t :: t in r["s1"] ==> Reaches(succ, "s1", t)
    ensures forall s, t :: s in r && t in Succ(succ, s) ==> r[t] <= r[s]
  {
    forall t | t in r["s1"]
      ensures t == "s1"
    {
      ReachesWithin(succ, {"s1"}, "s1", t);
    }
    forall s, t | s in r && t in Succ(succ, s)
      ensures r[t] <= r[s]
    {
      assert s == "s0" && t == "s1";
    }
  }

  /**
   * Whatever order the set pops the states in, the single sweep of the constructor as written
   * gives the test NFA its expected closures.
   */
  lemma TestNfaSweep(order: seq<string>)
    requires Closures.IsEnumeration(order, {"s0", "s1", "s2", "s3"})
    ensures Closures.Sweep(EpsilonEdges(TestNfaMappings()), order, Closures.Initial({"s0", "s1", "s2", "s3"}))
      == TestNfaClosures()
  {
    var states: set<string> := {"s0", "s1", "s2", "s3"};
    var succ: map<string, set<string>> := map["s0" := {"s1"}];
    TestNfaEpsilonEdges();
    assert Closures.TargetsAreStates(states, succ);
    Closures.SweepFromInitial(states, succ, order);
    var r := Closures.Sweep(succ, order, Closures.Initial(states));
    TestNfaClosedClosures(succ, r);
    TestNfaClosuresExact(r);
  }

  /** The constructor as written, applied to the arguments of the unit tests, builds the test NFA. */
  method TestNfaConstructed() returns (r: Result<Nfa>)
    ensures r == Ok(TestNfa(TestNfaClosures()))
  {
    var states: set<string> := {"s0", "s1", "s2", "s3"};
    ghost var order;
    r, order := NewNfa(Some(states), Some({"a", "b"}), Some(TestNfaMappings()), Some("s0"), Some({"s3"}));
    TestNfaEpsilonEdges();
    assert Closures.TargetsAreStates(states, EpsilonEdges(TestNfaMappings()));
    TestNfaSweep(order);
  }

  lemma TestNfaStepFromStart()
    ensures Simulation.Step(TestNfaClosures(), Delta(TestNfaMappings()), {"s0"}, 'a') == Ok({"s0", "s2"})
  {
    var cl, d := TestNfaClosures(), Delta(TestNfaMappings());
    var Y := Simulation.Step(cl, d, {"s0"}, 'a').value;
    assert d("s0", 'a') == {"s0"} && d("s1", 'a') == {"s2"};
    assert "s0" in Y && "s2" in Y;
    assert Y == {"s0", "s2"};
  }

  lemma TestNfaStepLoop()
    ensures Simulation.Step(TestNfaClosures(), Delta(TestNfaMappings()), {"s0", "s2"}, 'a') == Ok({"s0", "s2"})
  {
    var cl, d := TestNfaClosures(), Delta(TestNfaMappings());
    var Y := Simulation.Step(cl, d, {"s0", "s2"}, 'a').value;
    assert d("s0", 'a') == {"s0"} && d("s1", 'a') == {"s2"} && d("s2", 'a') == {};
    assert "s0" in Y && "s2" in Y;
    assert Y == {"s0", "s2"};
  }

  lemma TestNfaStepToAccept()
    ensures Simulation.Step(TestNfaClosures(), Delta(TestNfaMappings()), {"s0", "s2"}, 'b') == Ok({"s3"})
  {
    var cl, d := TestNfaClosures(), Delta(TestNfaMappings());
    var Y := Simulation.Step(cl, d, {"s0", "s2"}, 'b').value;
    assert d("s0", 'b') == {} && d("s1", 'b') == {} && d("s2", 'b') == {"s3"};
    assert "s3" in Y;
    assert Y == {"s3"};
  }

  lemma TestNfaStepsToNothing()
    ensures Simulation.Step(TestNfaClosures(), Delta(TestNfaMappings()), {"s3"}, 'a') == Ok({})
    ensures Simulation.Step(TestNfaClosures(), Delta(TestNfaMappings()), {"s0"}, 't') == Ok({})
  {
    var cl, d := TestNfaClosures(), Delta(TestNfaMappings());
    assert d("s3", 'a') == {} && d("s0", 't') == {} && d("s1", 't') == {};
    var Y := Simulation.Step(cl, d, {"s3"}, 'a').value;
    assert forall t :: t !in Y;
    assert Y == {};
    var Z := Simulation.Step(cl, d, {"s0"}, 't').value;
    assert forall t :: t !in Z;
    assert Z == {};
  }

  lemma TestNfaRunB(cl: map<string, set<string>>, d: (string, char) -> set<string>)
    requires cl == TestNfaClosures() && d == Delta(TestNfaMappings())
    ensures Simulation.Run(cl, d, {"s0", "s2"}, "b") == Ok({"s3"})
  {
    assert ['b'] + [] == "b";
    TestNfaStepToAccept();
    Simulation.RunStep(cl, d, {"s0", "s2"}, 'b', [], {"s3"});
  }

  lemma TestNfaRunAb(cl: map<string, set<string>>, d: (string, char) -> set<string>)
    requires cl == TestNfaClosures() && d == Delta(TestNfaMappings())
    ensures Simulation.Run(cl, d, {"s0"}, "ab") == Ok({"s3"})
  {
    assert ['a'] + "b" == "ab";
    TestNfaRunB(cl, d);
    TestNfaStepFromStart();
    Simulation.RunStep(cl, d, {"s0"}, 'a', "b", {"s0", "s2"});
  }

  lemma TestNfaRunLoopAb(cl: map<string, set<string>>, d: (string, char) -> set<string>)
    requires cl == TestNfaClosures() && d == Delta(TestNfaMappings())
    ensures Simulation.Run(cl, d, {"s0", "s2"}, "ab") == Ok({"s3"})
  {
    assert ['a'] + "b" == "ab";
    TestNfaRunB(cl, d);
    TestNfaRunLoopA(cl, d, "b");
  }

  /** From {s0, s2} an a leads back to {s0, s2}. */
  lemma TestNfaRunLoopA(cl: map<string, set<string>>, d: (string, char) -> set<string>, w: string)
    requires cl == TestNfaClosures() && d == Delta(TestNfaMappings())
    ensures Simulation.Run(cl, d, {"s0", "s2"}, ['a'] + w) == Simulation.Run(cl, d, {"s0", "s2"}, w)
  {
    TestNfaStepLoop();
    Simulation.RunStep(cl, d, {"s0", "s2"}, 'a', w, {"s0", "s2"});
  }

  lemma TestNfaRunAab(cl: map<string, set<string>>, d: (string, char) -> set<string>)
    requires cl == TestNfaClosures() && d == Delta(TestNfaMappings())
    ensures Simulation.Run(cl, d, {"s0"}, "aab") == Ok({"s3"})
  {
    assert ['a'] + "ab" == "aab";
    TestNfaRunLoopAb(cl, d);
    TestNfaStepFromStart();
    Simulation.RunStep(cl, d, {"s0"}, 'a', "ab", {"s0", "s2"});
  }

  /** A word that leads the test NFA from s0 to exactly {s3} is accepted, with or without the final closure. */
  lemma TestNfaAcceptsWord(w: string)
    requires Simulation.Run(TestNfaClosures(), Delta(TestNfaMappings()), {"s0"}, w) == Ok({"s3"})
    ensures NfaAcceptance(TestNfa(TestNfaClosures()), w) == Ok(true)
    ensures NfaAcceptsAsWritten(TestNfa(TestNfaClosures()), w) == Ok(true)
  {
    var cl, n := TestNfaClosures(), TestNfa(TestNfaClosures());
    assert n.fa.startState == Some("s0") && n.fa.acceptingStates == {"s3"};
    assert n.epsilonClosures == cl && n.fa.transitionMappings == TestNfaMappings();
    assert {"s3"} <= cl.Keys && "s3" in cl["s3"];
    assert "s3" in Simulation.Close(cl, {"s3"}) * {"s3"};
  }

  /** The test NFA accepts "ab" and "aab", with or without the final closure. */
  lemma TestNfaAccepts()
    ensures NfaAcceptance(TestNfa(TestNfaClosures()), "ab") == Ok(true)
    ensures NfaAcceptance(TestNfa(TestNfaClosures()), "aab") == Ok(true)
    ensures NfaAcceptsAsWritten(TestNfa(TestNfaClosures()), "ab") == Ok(true)
    ensures NfaAcceptsAsWritten(TestNfa(TestNfaClosures()), "aab") == Ok(true)
  {
    var cl, d := TestNfaClosures(), Delta(TestNfaMappings());
    TestNfaRunAb(cl, d);
    TestNfaAcceptsWord("ab");
    TestNfaRunAab(cl, d);
    TestNfaAcceptsWord("aab");
  }

  /** s3 has no transition on a, and nothing follows from no state. */
  lemma TestNfaRunDeadA(cl: map<string, set<string>>, d: (string, char) -> set<string>, w: string)
    requires cl == TestNfaClosures() && d == Delta(TestNfaMappings())
    ensures Simulation.Run(cl, d, {"s3"}, ['a'] + w) == Ok({})
  {
    TestNfaStepsToNothing();
    Simulation.RunEmpty(cl, d, w);
    Simulation.RunStep(cl, d, {"s3"}, 'a', w, {});
  }

  lemma TestNfaRunBa(cl: map<string, set<string>>, d: (string, char) -> set<string>, w: string)
    requires cl == TestNfaClosures() && d == Delta(TestNfaMappings())
    ensures Simulation.Run(cl, d, {"s0", "s2"}, ['b', 'a'] + w) == Ok({})
  {
    assert ['b'] + (['a'] + w) == ['b', 'a'] + w;
    TestNfaRunDeadA(cl, d, w);
    TestNfaStepToAccept();
    Simulation.RunStep(cl, d, {"s0", "s2"}, 'b', ['a'] + w, {"s3"});
  }

  lemma TestNfaRunAba(cl: map<string, set<string>>, d: (string, char) -> set<string>, w: string)
    requires cl == TestNfaClosures() && d == Delta(TestNfaMappings())
    ensures Simulation.Run(cl, d, {"s0"}, ['a', 'b', 'a'] + w) == Ok({})
  {
    assert ['a'] + (['b', 'a'] + w) == ['a', 'b', 'a'] + w;
    TestNfaRunBa(cl, d, w);
    TestNfaStepFromStart();
    Simulation.RunStep(cl, d, {"s0"}, 'a', ['b', 'a'] + w, {"s0", "s2"});
  }

  lemma TestNfaRunLoopAba(cl: map<string, set<string>>, d: (string, char) -> set<string>, w: string)
    requires cl == TestNfaClosures() && d == Delta(TestNfaMappings())
    ensures Simulation.Run(cl, d, {"s0", "s2"}, ['a', 'b', 'a'] + w) == Ok({})
  {
    assert ['a'] + (['b', 'a'] + w) == ['a', 'b', 'a'] + w;
    TestNfaRunBa(cl, d, w);
    TestNfaStepLoop();
    Simulation.RunStep(cl, d, {"s0", "s2"}, 'a', ['b', 'a'] + w, {"s0", "s2"});
  }

  lemma TestNfaRunAabaab(cl: map<string, set<string>>, d: (string, char) -> set<string>)
    requires cl == TestNfaClosures() && d == Delta(TestNfaMappings())
    ensures Simulation.Run(cl, d, {"s0"}, "aabaab") == Ok({})
  {
    assert ['a'] + (['a', 'b', 'a'] + "ab") == "aabaab";
    TestNfaRunLoopAba(cl, d, "ab");
    TestNfaStepFromStart();
    Simulation.RunStep(cl, d, {"s0"}, 'a', ['a', 'b', 'a'] + "ab", {"s0", "s2"});
  }

  lemma TestNfaRunTest(cl: map<string, set<string>>, d: (string, char) -> set<string>)
    requires cl == TestNfaClosures() && d == Delta(TestNfaMappings())
    ensures Simulation.Run(cl, d, {"s0"}, "test") == Ok({})
  {
    assert ['t'] + "est" == "test";
    TestNfaStepsToNothing();
    Simulation.RunEmpty(cl, d, "est");
    Simulation.RunStep(cl, d, {"s0"}, 't', "est", {});
  }

  /** The test NFA rejects "aba", "abab", "aabaab" and "test", with or without the final closure. */
  lemma TestNfaRejects()
    ensures NfaAcceptance(TestNfa(TestNfaClosures()), "aba") == Ok(false)
    ensures NfaAcceptance(TestNfa(TestNfaClosures()), "abab") == Ok(false)
    ensures NfaAcceptance(TestNfa(TestNfaClosures()), "aabaab") == Ok(false)
    ensures NfaAcceptance(TestNfa(TestNfaClosures()), "test") == Ok(false)
    ensures NfaAcceptsAsWritten(TestNfa(TestNfaClosures()), "aba") == Ok(false)
    ensures NfaAcceptsAsWritten(TestNfa(TestNfaClosures()), "abab") == Ok(false)
    ensures NfaAcceptsAsWritten(TestNfa(TestNfaClosures()), "aabaab") == Ok(false)
    ensures NfaAcceptsAsWritten(TestNfa(TestNfaClosures()), "test") == Ok(false)
  {
    var cl, d := TestNfaClosures(), Delta(TestNfaMappings());
    TestNfaRunAba(cl, d, []);
    TestNfaRunAba(cl, d, "b");
    assert ['a', 'b', 'a'] + [] == "aba" && ['a', 'b', 'a'] + "b" == "abab";
    TestNfaRunAabaab(cl, d);
    TestNfaRunTest(cl, d);
    assert forall x :: x !in Simulation.Close(cl, {});
    assert Simulation.Close(cl, {}) == {};
  }

  /**
   * The missing final closure: with one epsilon edge from the start state s0 to the accepting
   * state s1, the empty word is in the language, the corrected acceptance says so, and accepts
   * as written rejects it.
   */
  lemma NoFinalClosureRejects(cl: map<string, set<string>>)
    requires IsClosureMap(EpsilonEdges(map["s0" := map["" := {"s1"}]]), {"s0", "s1"}, cl)
    ensures var n := Nfa(Automaton({"s0", "s1"}, {}, map["s0" := map["" := {"s1"}]], Some("s0"), {"s1"}), cl);
      && NfaLanguage(n, [])
      && NfaAcceptance(n, []) == Ok(true)
      && NfaAcceptsAsWritten(n, []) == Ok(false)
  {
    var tm := map["s0" := map["" := {"s1"}]];
    var succ := EpsilonEdges(tm);
    assert "" in tm["s0"];
    assert succ == map["s0" := {"s1"}];
    assert IsPath(succ, ["s0", "s1"]);
    assert "s1" in cl["s0"];
    assert Simulation.Derives(succ, Delta(tm), "s0", [], "s1");
    assert Simulation.Run(cl, Delta(tm), {"s0"}, []) == Ok({"s0"});
    assert {"s0"} <= cl.Keys;
    assert "s1" in Simulation.Close(cl, {"s0"}) * {"s1"};
  }
}
