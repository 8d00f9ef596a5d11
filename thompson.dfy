/**
 * The Thompson fragment builders of scanner/thompson.py (the same four functions are repeated
 * in fa.py). A fragment is the NFA object a builder returns; building one adds states to the
 * arena and epsilon edges to the states of its operands, in place.
 */
module Thompson {
  import opened StateGraph
  import Closures

  /** The states, alphabet, initial state and accepting states of an NFA object. */
  datatype Fragment = Fragment(states: set<nat>, alphabet: set<char>, initial: nat, accepting: set<nat>)

  /** The fragment's states exist, and its initial and accepting states are among them. */
  ghost predicate Within(f: Fragment, size: nat) {
    && (forall s :: s in f.states ==> s < size)
    && f.initial in f.states
    && f.accepting <= f.states
  }

  /** No edge leaves a state of part for a state outside states. */
  ghost predicate EdgesInto(trans: seq<map<char, set<nat>>>, eps: seq<seq<nat>>, part: set<nat>, states: set<nat>) {
    forall s :: s in part ==>
      && s < |trans| && s < |eps|
      && (forall j :: 0 <= j < |eps[s]| ==> eps[s][j] in states)
      && (forall a, t :: a in trans[s] && t in trans[s][a] ==> t in states)
  }

  /** No edge leaves the given states. */
  ghost predicate EdgesWithin(trans: seq<map<char, set<nat>>>, eps: seq<seq<nat>>, states: set<nat>) {
    EdgesInto(trans, eps, states, states)
  }

  /** Edges into a set from two parts are edges into it from their union. */
  lemma EdgesIntoUnion(trans: seq<map<char, set<nat>>>, eps: seq<seq<nat>>, a: set<nat>, b: set<nat>, states: set<nat>)
    requires EdgesInto(trans, eps, a, states) && EdgesInto(trans, eps, b, states)
    ensures EdgesInto(trans, eps, a + b, states)
  {
  }

  /**
   * The shape every builder produces: one accepting state, which has no outgoing edge, and no
   * edge leaving the fragment.
   */
  ghost predicate Shape(f: Fragment, trans: seq<map<char, set<nat>>>, eps: seq<seq<nat>>) {
    && Within(f, |eps|) && |trans| == |eps|
    && |f.accepting| == 1
    && EdgesWithin(trans, eps, f.states)
    && (forall s :: s in f.accepting ==> trans[s] == map[] && eps[s] == [])
  }

  /** A fragment keeps its shape while none of its states' edges change and states are only added. */
  lemma ShapeFrame(
    f: Fragment, trans: seq<map<char, set<nat>>>, eps: seq<seq<nat>>,
    trans': seq<map<char, set<nat>>>, eps': seq<seq<nat>>)
    requires Shape(f, trans, eps)
    requires |trans'| == |eps'| >= |eps|
    requires forall s :: s in f.states ==> trans'[s] == trans[s] && eps'[s] == eps[s]
    ensures Shape(f, trans', eps')
  {
  }

  /** k copies of x. */
  function Repeat(x: nat, k: nat): (r: seq<nat>)
    ensures |r| == k && forall j :: 0 <= j < k ==> r[j] == x
  {
    if k == 0 then [] else Repeat(x, k - 1) + [x]
  }

  /** The states the first j pairs of zip(first, second) visit, each counted once per visit. */
  function Pairs(first: seq<nat>, second: seq<nat>, j: nat): multiset<nat>
    requires j <= |first| && j <= |second|
  {
    multiset(first[..j]) + multiset(second[..j])
  }

  /** One more pair of zip visits both of its states once more. */
  lemma PairsSnoc(first: seq<nat>, second: seq<nat>, j: nat)
    requires j < |first| && j < |second|
    ensures Pairs(first, second, j + 1) == Pairs(first, second, j) + multiset{first[j], second[j]}
  {
    assert first[..j + 1] == first[..j] + [first[j]];
    assert second[..j + 1] == second[..j] + [second[j]];
  }

  /** The states zip(first, second) visits, each counted once per visit. */
  function Zipped(first: seq<nat>, second: seq<nat>): multiset<nat> {
    Pairs(first, second, if |first| < |second| then |first| else |second|)
  }

  /** One more epsilon edge to acc from x counts one more visit of x. */
  lemma CountVisit(
    base: seq<seq<nat>>, before: seq<seq<nat>>, after: seq<seq<nat>>, visited: multiset<nat>,
    x: nat, acc: nat, bound: nat)
    requires bound <= |base| && bound <= |before| && x < bound
    requires after == before[x := before[x] + [acc]]
    requires forall i :: 0 <= i < bound ==> before[i] == base[i] + Repeat(acc, visited[i])
    ensures forall i :: 0 <= i < bound ==> after[i] == base[i] + Repeat(acc, (visited + multiset{x})[i])
  {
    forall i | 0 <= i < bound
      ensures after[i] == base[i] + Repeat(acc, (visited + multiset{x})[i])
    {
      if i == x {
        assert (visited + multiset{x})[i] == visited[i] + 1;
      } else {
        assert (visited + multiset{x})[i] == visited[i];
      }
    }
  }

  /** Appending targets inside a set to targets inside it keeps them inside it. */
  lemma AppendInside(e: seq<nat>, extra: seq<nat>, states: set<nat>)
    requires forall j :: 0 <= j < |e| ==> e[j] in states
    requires forall j :: 0 <= j < |extra| ==> extra[j] in states
    ensures forall j :: 0 <= j < |e + extra| ==> (e + extra)[j] in states
  {
  }

  /**
   * After edges to acc are appended to the states below |eps|, the edges of a part whose edges
   * stayed inside it lead into any superset of the part that holds acc.
   */
  lemma PartEdges(
    part: set<nat>, states: set<nat>, trans: seq<map<char, set<nat>>>, eps: seq<seq<nat>>,
    trans': seq<map<char, set<nat>>>, eps': seq<seq<nat>>, acc: nat, visits: multiset<nat>)
    requires EdgesWithin(trans, eps, part) && part <= states && acc in states
    requires |trans| == |eps| && trans' == trans + [map[], map[]] && |eps'| == |eps| + 2
    requires forall i :: 0 <= i < |eps| ==> eps'[i] == eps[i] + Repeat(acc, visits[i])
    ensures EdgesInto(trans', eps', part, states)
  {
    forall s | s in part
      ensures forall j :: 0 <= j < |eps'[s]| ==> eps'[s][j] in states
      ensures forall a, t :: a in trans'[s] && t in trans'[s][a] ==> t in states
    {
      assert trans'[s] == trans[s];
      assert eps'[s] == eps[s] + Repeat(acc, visits[s]);
    }
  }

  /** The union fragment is shaped once the edges of both operands lead into it. */
  lemma UnionParts(first: Fragment, second: Fragment, f: Fragment, trans': seq<map<char, set<nat>>>, eps': seq<seq<nat>>, n: nat)
    requires Within(first, n) && Within(second, n)
    requires f == Fragment(first.states + second.states + {n, n + 1}, first.alphabet + second.alphabet, n, {n + 1})
    requires |trans'| == |eps'| == n + 2 && trans'[n] == map[] && trans'[n + 1] == map[]
    requires eps'[n] == [first.initial, second.initial] && eps'[n + 1] == []
    requires EdgesInto(trans', eps', first.states, f.states) && EdgesInto(trans', eps', second.states, f.states)
    ensures Shape(f, trans', eps')
  {
    assert EdgesInto(trans', eps', {n, n + 1}, f.states);
    EdgesIntoUnion(trans', eps', first.states, second.states, f.states);
    EdgesIntoUnion(trans', eps', first.states + second.states, {n, n + 1}, f.states);
  }

  /** The union of two shaped fragments is shaped, however many edges the zip added. */
  lemma UnionShape(
    first: Fragment, second: Fragment, trans: seq<map<char, set<nat>>>, eps: seq<seq<nat>>,
    trans': seq<map<char, set<nat>>>, eps': seq<seq<nat>>, visits: multiset<nat>)
    requires Shape(first, trans, eps) && Shape(second, trans, eps)
    requires trans' == trans + [map[], map[]]
    requires |eps'| == |eps| + 2 && eps'[|eps|] == [first.initial, second.initial] && eps'[|eps| + 1] == []
    requires forall i :: 0 <= i < |eps| ==> eps'[i] == eps[i] + Repeat(|eps| + 1, visits[i])
    ensures var n := |eps|;
      Shape(Fragment(first.states + second.states + {n, n + 1}, first.alphabet + second.alphabet, n, {n + 1}), trans', eps')
  {
    var n := |eps|;
    var f := Fragment(first.states + second.states + {n, n + 1}, first.alphabet + second.alphabet, n, {n + 1});
    PartEdges(first.states, f.states, trans, eps, trans', eps', n + 1, visits);
    PartEdges(second.states, f.states, trans, eps, trans', eps', n + 1, visits);
    UnionParts(first, second, f, trans', eps', n);
  }

  /** The edges of the first operand of a concatenation lead into the concatenation. */
  lemma ConcatenationFirst(
    first: Fragment, second: Fragment, states: set<nat>, trans: seq<map<char, set<nat>>>, eps: seq<seq<nat>>,
    eps': seq<seq<nat>>)
    requires Shape(first, trans, eps) && Within(second, |eps|) && states == first.states + second.states
    requires |eps'| == |eps|
    requires forall i :: 0 <= i < |eps| ==> eps'[i] == if i in first.accepting then eps[i] + [second.initial] else eps[i]
    ensures EdgesInto(trans, eps', first.states, states)
  {
    forall s | s in first.states
      ensures forall j :: 0 <= j < |eps'[s]| ==> eps'[s][j] in states
    {
      AppendInside(eps[s], if s in first.accepting then [second.initial] else [], states);
      assert eps'[s] == eps[s] + if s in first.accepting then [second.initial] else [];
    }
  }

  /** The concatenation of two shaped fragments with no common state is shaped. */
  lemma ConcatenationShape(
    first: Fragment, second: Fragment, trans: seq<map<char, set<nat>>>, eps: seq<seq<nat>>, eps': seq<seq<nat>>)
    requires Shape(first, trans, eps) && Shape(second, trans, eps) && first.states !! second.states
    requires |eps'| == |eps|
    requires forall i :: 0 <= i < |eps| ==> eps'[i] == if i in first.accepting then eps[i] + [second.initial] else eps[i]
    ensures Shape(Fragment(first.states + second.states, first.alphabet + second.alphabet, first.initial, second.accepting), trans, eps')
  {
    var states := first.states + second.states;
    ConcatenationFirst(first, second, states, trans, eps, eps');
    forall s | s in second.states
      ensures eps'[s] == eps[s]
    {
      assert s !in first.accepting;
    }
    assert EdgesInto(trans, eps', second.states, states);
    EdgesIntoUnion(trans, eps', first.states, second.states, states);
  }

  /** The old states of a closure keep their edges inside the closure's states. */
  lemma ClosureOldStates(
    source: Fragment, states: set<nat>, trans: seq<map<char, set<nat>>>, eps: seq<seq<nat>>,
    trans': seq<map<char, set<nat>>>, eps': seq<seq<nat>>)
    requires Shape(source, trans, eps)
    requires forall s :: s in source.states ==> s in states
    requires source.initial in states && |eps| in states
    requires trans' == trans + [map[], map[]] && |eps'| == |eps| + 2
    requires forall i :: 0 <= i < |eps| ==>
      eps'[i] == if i in source.accepting then eps[i] + [source.initial, |eps|] else eps[i]
    ensures EdgesInto(trans', eps', source.states, states)
  {
    var n := |eps|;
    forall s | s in source.states
      ensures s < |trans'| && s < |eps'|
      ensures forall j :: 0 <= j < |eps'[s]| ==> eps'[s][j] in states
      ensures forall a, t :: a in trans'[s] && t in trans'[s][a] ==> t in states
    {
      AppendInside(eps[s], if s in source.accepting then [source.initial, n] else [], states);
      assert eps'[s] == eps[s] + if s in source.accepting then [source.initial, n] else [];
      assert trans'[s] == trans[s];
    }
  }

  /** The closure of a shaped fragment is shaped. */
  lemma ClosureShape(
    source: Fragment, trans: seq<map<char, set<nat>>>, eps: seq<seq<nat>>,
    trans': seq<map<char, set<nat>>>, eps': seq<seq<nat>>)
    requires Shape(source, trans, eps)
    requires trans' == trans + [map[], map[]]
    requires var n := |eps|; |eps'| == n + 2 && eps'[n] == [] && eps'[n + 1] == [source.initial, n]
    requires forall i :: 0 <= i < |eps| ==>
      eps'[i] == if i in source.accepting then eps[i] + [source.initial, |eps|] else eps[i]
    ensures var n := |eps|; Shape(Fragment(source.states + {n + 1, n}, source.alphabet, n + 1, {n}), trans', eps')
  {
    var n := |eps|;
    var states := source.states + {n + 1, n};
    ClosureOldStates(source, states, trans, eps, trans', eps');
    assert trans'[n] == map[] && trans'[n + 1] == map[];
    assert EdgesInto(trans', eps', {n + 1, n}, states);
    EdgesIntoUnion(trans', eps', source.states, {n + 1, n}, states);
  }

  /** build_symbol_nfa: a new initial state with one c-transition to a new accepting state. */
  method BuildSymbol(g: Arena, c: char) returns (f: Fragment)
    requires g.Valid()
    modifies g
    ensures g.Valid()
    ensures var n := old(|g.labels|); f == Fragment({n, n + 1}, {c}, n, {n + 1})
    ensures g.labels == old(g.labels) + ["initial_" + [c], "accepting_" + [c]]
    ensures g.trans == old(g.trans) + [map[c := {old(|g.labels|) + 1}], map[]]
    ensures g.eps == old(g.eps) + [[], []]
    ensures Shape(f, g.trans, g.eps)
  {
    var initial := g.NewState("initial_" + [c], []);
    var accepting := g.NewState("accepting_" + [c], []);
    g.AddTransition(initial, c, accepting);
    assert Targets(map[], c) + {accepting} == {accepting};
    f := Fragment({initial, accepting}, {c}, initial, {accepting});
  }

  /**
   * build_concatenation_nfa: every accepting state of the first fragment gets an epsilon edge to
   * the initial state of the second, in whatever order the set is visited.
   */
  method BuildConcatenation(g: Arena, first: Fragment, second: Fragment) returns (f: Fragment)
    requires g.Valid() && Within(first, |g.labels|) && Within(second, |g.labels|)
    modifies g
    ensures g.Valid() && g.labels == old(g.labels) && g.trans == old(g.trans) && |g.eps| == old(|g.eps|)
    ensures forall i :: 0 <= i < |g.eps| ==>
      g.eps[i] == if i in first.accepting then old(g.eps[i]) + [second.initial] else old(g.eps[i])
    ensures f == Fragment(first.states + second.states, first.alphabet + second.alphabet,
      first.initial, second.accepting)
  {
    var rest := first.accepting;
    while rest != {}
      invariant g.Valid() && rest <= first.accepting
      invariant g.labels == old(g.labels) && g.trans == old(g.trans) && |g.eps| == old(|g.eps|)
      invariant forall i :: 0 <= i < |g.eps| ==>
        g.eps[i] == if i in first.accepting - rest then old(g.eps[i]) + [second.initial] else old(g.eps[i])
      decreases |rest|
    {
      var s :| s in rest;
      g.AddEpsilonTransition(s, second.initial);
      rest := rest - {s};
    }
    f := Fragment(first.states + second.states, first.alphabet + second.alphabet,
      first.initial, second.accepting);
  }

  /** One pair of zip: an edge to acc from x, then one from y, counts one more visit of each. */
  lemma PairStep(
    base: seq<seq<nat>>, before: seq<seq<nat>>, mid: seq<seq<nat>>, after: seq<seq<nat>>, visited: multiset<nat>,
    x: nat, y: nat, acc: nat, bound: nat)
    requires bound <= |base| && bound <= |before| && x < bound && y < bound
    requires mid == before[x := before[x] + [acc]] && after == mid[y := mid[y] + [acc]]
    requires forall i :: 0 <= i < bound ==> before[i] == base[i] + Repeat(acc, visited[i])
    ensures forall i :: 0 <= i < bound ==> after[i] == base[i] + Repeat(acc, (visited + multiset{x, y})[i])
    ensures after[bound..] == before[bound..]
  {
    CountVisit(base, before, mid, visited, x, acc, bound);
    CountVisit(base, mid, after, visited + multiset{x}, y, acc, bound);
    assert visited + multiset{x} + multiset{y} == visited + multiset{x, y};
  }

  /**
   * The loop of build_union_nfa: for each pair zip yields, both states get an epsilon edge to
   * acc, the first of the pair before the second. Only states below bound are visited.
   */
  method ZipToAccepting(g: Arena, firstOrder: seq<nat>, secondOrder: seq<nat>, acc: nat, bound: nat)
    requires g.Valid() && bound <= acc < |g.labels|
    requires forall j :: 0 <= j < |firstOrder| ==> firstOrder[j] < bound
    requires forall j :: 0 <= j < |secondOrder| ==> secondOrder[j] < bound
    modifies g
    ensures g.Valid() && g.labels == old(g.labels) && g.trans == old(g.trans) && |g.eps| == old(|g.eps|)
    ensures g.eps[bound..] == old(g.eps[bound..])
    ensures forall i :: 0 <= i < bound ==> g.eps[i] == old(g.eps[..bound])[i] + Repeat(acc, Zipped(firstOrder, secondOrder)[i])
  {
    var k := if |firstOrder| < |secondOrder| then |firstOrder| else |secondOrder|;
    ghost var e0 := g.eps;
    ghost var visited: multiset<nat> := multiset{};
    for j := 0 to k
      invariant g.Valid() && g.labels == old(g.labels) && g.trans == old(g.trans) && |g.eps| == |e0|
      invariant g.eps[bound..] == e0[bound..]
      invariant visited == Pairs(firstOrder, secondOrder, j)
      invariant forall i :: 0 <= i < bound ==> g.eps[i] == e0[i] + Repeat(acc, visited[i])
    {
      PairsSnoc(firstOrder, secondOrder, j);
      ghost var before := g.eps;
      g.AddEpsilonTransition(firstOrder[j], acc);
      ghost var mid := g.eps;
      g.AddEpsilonTransition(secondOrder[j], acc);
      PairStep(e0, before, mid, g.eps, visited, firstOrder[j], secondOrder[j], acc, bound);
      visited := visited + multiset{firstOrder[j], secondOrder[j]};
    }
  }

  /**
   * build_union_nfa: a new initial state with epsilon edges to both initial states, a new
   * accepting state, and an epsilon edge to it from each pair of accepting states zip visits.
   * The order in which a set is visited is not fixed by the program: firstOrder and secondOrder
   * are the visiting orders of the two accepting sets.
   */
  method BuildUnion(g: Arena, first: Fragment, second: Fragment, firstOrder: seq<nat>, secondOrder: seq<nat>)
    returns (f: Fragment)
    requires g.Valid() && Within(first, |g.labels|) && Within(second, |g.labels|)
    requires Closures.IsEnumeration(firstOrder, first.accepting)
    requires Closures.IsEnumeration(secondOrder, second.accepting)
    modifies g
    ensures g.Valid()
    ensures var n := old(|g.labels|);
      f == Fragment(first.states + second.states + {n, n + 1}, first.alphabet + second.alphabet, n, {n + 1})
    ensures g.labels == old(g.labels) + ["initial_union", "accepting_union"]
    ensures g.trans == old(g.trans) + [map[], map[]]
    ensures var n := old(|g.labels|);
      && |g.eps| == n + 2 && g.eps[n] == [first.initial, second.initial] && g.eps[n + 1] == []
      && forall i :: 0 <= i < n ==> g.eps[i] == old(g.eps[i]) + Repeat(n + 1, Zipped(firstOrder, secondOrder)[i])
  {
    ghost var trans0, eps0 := g.trans, g.eps;
    var initial := g.NewState("initial_union", [first.initial, second.initial]);
    var accepting := g.NewState("accepting_union", []);
    ghost var eps1 := g.eps;
    assert eps1[..initial] == eps0;
    ZipToAccepting(g, firstOrder, secondOrder, accepting, initial);
    assert g.eps[initial] == g.eps[initial..][0] && g.eps[accepting] == g.eps[initial..][1];
    assert eps1[initial] == eps1[initial..][0] && eps1[accepting] == eps1[initial..][1];
    f := Fragment(first.states + second.states + {initial, accepting}, first.alphabet + second.alphabet,
      initial, {accepting});
  }

  /**
   * build_closure_nfa: a new accepting state, then a new initial state with epsilon edges to the
   * source's initial state and to the new accepting state, in that order; every accepting state
   * of the source gets the same two edges, in the same order.
   */
  method BuildClosure(g: Arena, source: Fragment) returns (f: Fragment)
    requires g.Valid() && Within(source, |g.labels|)
    modifies g
    ensures g.Valid()
    ensures var n := old(|g.labels|); f == Fragment(source.states + {n + 1, n}, source.alphabet, n + 1, {n})
    ensures g.labels == old(g.labels) + ["accepting_closure", "initial_closure"]
    ensures g.trans == old(g.trans) + [map[], map[]]
    ensures var n := old(|g.labels|);
      && |g.eps| == n + 2 && g.eps[n] == [] && g.eps[n + 1] == [source.initial, n]
      && forall i :: 0 <= i < n ==>
        g.eps[i] == if i in source.accepting then old(g.eps[i]) + [source.initial, n] else old(g.eps[i])
  {
    var accepting := g.NewState("accepting_closure", []);
    var initial := g.NewState("initial_closure", [source.initial, accepting]);
    var rest := source.accepting;
    while rest != {}
      invariant g.Valid() && rest <= source.accepting && |g.eps| == accepting + 2
      invariant g.labels == old(g.labels) + ["accepting_closure", "initial_closure"]
      invariant g.trans == old(g.trans) + [map[], map[]]
      invariant g.eps[accepting] == [] && g.eps[initial] == [source.initial, accepting]
      invariant forall i :: 0 <= i < accepting ==>
        g.eps[i] == if i in source.accepting - rest then old(g.eps[i]) + [source.initial, accepting] else old(g.eps[i])
      decreases |rest|
    {
      var s :| s in rest;
      g.AddEpsilonTransitions(s, [source.initial, accepting]);
      rest := rest - {s};
    }
    f := Fragment(source.states + {initial, accepting}, source.alphabet, initial, {accepting});
  }
}
