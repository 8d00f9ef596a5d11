/**
 * The epsilon-closure work-list of finite_automaton.py (__create_epsilon_closures), over any
 * type of state: the table automaton uses names, the State graph uses arena indices.
 */
module Closures {
  import opened Reach

  /** Every state starts with itself as its closure: {s: {s} for s in states}. */
  function Initial<S>(states: set<S>): (cl: map<S, set<S>>)
    ensures cl.Keys == states
    ensures forall s :: s in states ==> cl[s] == {s}
  {
    map s | s in states :: {s}
  }

  /** Every epsilon target of a state is itself a state (otherwise the lookup raises KeyError). */
  predicate TargetsAreStates<S>(states: set<S>, succ: map<S, set<S>>) {
    forall s :: s in states ==> Succ(succ, s) <= states
  }

  /** preds records every epsilon edge between states, reversed. */
  ghost predicate CoversPredecessors<S>(states: set<S>, succ: map<S, set<S>>, preds: map<S, set<S>>) {
    forall k, s :: k in states && s in Succ(succ, k) ==> k in Succ(preds, s)
  }

  /** The (state, state) pairs not yet known to be in a closure; shrinks as closures grow. */
  ghost function Missing<S>(states: set<S>, cl: map<S, set<S>>): set<(S, S)>
    requires states <= cl.Keys
  {
    set s, t | s in states && t in states && t !in cl[s] :: (s, t)
  }

  /**
   * The work-list invariant: closures are reflexive, sound and made of states, and every state
   * off the work-list already contains the closures of its epsilon targets.
   */
  ghost predicate WorkInv<S(!new)>(states: set<S>, succ: map<S, set<S>>, cl: map<S, set<S>>, work: set<S>) {
    && cl.Keys == states && work <= states
    && (forall s :: s in states ==> s in cl[s] && cl[s] <= states)
    && (forall s, t :: s in states && t in cl[s] ==> Reaches(succ, s, t))
    && (forall s, t :: s in states && s !in work && t in Succ(succ, s) && t in cl ==> cl[t] <= cl[s])
  }

  /** Growing the closure of s fills in at least one missing pair. */
  lemma GrowShrinks<S>(states: set<S>, succ: map<S, set<S>>, cl: map<S, set<S>>, s: S)
    requires cl.Keys == states && s in states && Succ(succ, s) <= states
    requires forall t :: t in states ==> cl[t] <= states
    requires !(UnionOf(cl, Succ(succ, s)) <= cl[s])
    ensures Missing(states, cl[s := cl[s] + UnionOf(cl, Succ(succ, s))]) < Missing(states, cl)
  {
    var cl' := cl[s := cl[s] + UnionOf(cl, Succ(succ, s))];
    var x :| x in UnionOf(cl, Succ(succ, s)) && x !in cl[s];
    var t :| t in Succ(succ, s) && x in cl[t];
    assert (s, x) in Missing(states, cl) - Missing(states, cl');
  }

  /** Growing the closure of s and re-enqueueing its predecessors keeps the invariant. */
  lemma Grow<S(!new)>(
    states: set<S>, succ: map<S, set<S>>, preds: map<S, set<S>>, cl: map<S, set<S>>, work: set<S>, s: S)
    requires TargetsAreStates(states, succ) && CoversPredecessors(states, succ, preds)
    requires WorkInv(states, succ, cl, work) && s in work
    ensures var cl' := cl[s := cl[s] + UnionOf(cl, Succ(succ, s))];
      WorkInv(states, succ, cl', work - {s} + Succ(preds, s) * states)
  {
    var e := UnionOf(cl, Succ(succ, s));
    forall x | x in e
      ensures Reaches(succ, s, x)
    {
      var t :| t in Succ(succ, s) && x in cl[t];
      ReachesStep(succ, s, t, x);
    }
  }

  /**
   * The work-list fixpoint with the re-enqueueing the algorithm relies on: when a state's
   * closure grows, its epsilon-predecessors go back on the work-list. The result is exactly the
   * epsilon-reachability closure of every state.
   */
  method EpsilonClosures<S(!new)>(states: set<S>, succ: map<S, set<S>>, preds: map<S, set<S>>)
    returns (cl: map<S, set<S>>)
    requires TargetsAreStates(states, succ)
    requires CoversPredecessors(states, succ, preds)
    ensures IsClosureMap(succ, states, cl)
  {
    cl := Initial(states);
    var work := states;
    forall s | s in states
      ensures Reaches(succ, s, s)
    {
      ReachesRefl(succ, s);
    }
    while work != {}
      invariant WorkInv(states, succ, cl, work)
      decreases Missing(states, cl), |work|
    {
      var s :| s in work;
      var e := UnionOf(cl, Succ(succ, s));
      if !(e <= cl[s]) {
        Grow(states, succ, preds, cl, work, s);
        GrowShrinks(states, succ, cl, s);
        cl := cl[s := cl[s] + e];
        work := work - {s} + Succ(preds, s) * states;
      } else {
        work := work - {s};
      }
    }
    forall s, u | s in states && Reaches(succ, s, u)
      ensures u in cl[s]
    {
      var p :| IsPath(succ, p) && p[0] == s && p[|p| - 1] == u;
      ClosedIsComplete(succ, states, cl, p);
    }
  }

  // ---------------------------------------------------------------------------------------------
  // The loop as written: `work_list.union(...)` builds a new set and discards it, so nothing is
  // ever re-enqueued and every state is popped exactly once, in the set's iteration order.

  /** order lists every state exactly once. */
  ghost predicate IsEnumeration<S>(order: seq<S>, states: set<S>) {
    && |order| == |states|
    && (forall i :: 0 <= i < |order| ==> order[i] in states)
    && (forall i, j :: 0 <= i < j < |order| ==> order[i] != order[j])
  }

  /** One pass over the states in the given pop order, updating each closure once. */
  function Sweep<S>(succ: map<S, set<S>>, order: seq<S>, cl: map<S, set<S>>): map<S, set<S>>
    requires forall i :: 0 <= i < |order| ==> order[i] in cl && Succ(succ, order[i]) <= cl.Keys
    decreases |order|
  {
    if order == [] then cl
    else
      var s := order[0];
      var e := UnionOf(cl, Succ(succ, s));
      Sweep(succ, order[1..], if e != cl[s] then cl[s := cl[s] + e] else cl)
  }

  /** A single pass keeps the keys, keeps every closure reflexive and sound, and only grows them. */
  lemma {:induction false} SweepFacts<S(!new)>(
    states: set<S>, succ: map<S, set<S>>, order: seq<S>, cl: map<S, set<S>>)
    requires TargetsAreStates(states, succ) && cl.Keys == states
    requires forall i :: 0 <= i < |order| ==> order[i] in states
    requires forall s, t :: s in states && t in cl[s] ==> Reaches(succ, s, t)
    ensures Sweep(succ, order, cl).Keys == states
    ensures forall s :: s in states ==> cl[s] <= Sweep(succ, order, cl)[s]
    ensures forall s, t :: s in states && t in Sweep(succ, order, cl)[s] ==> Reaches(succ, s, t)
    decreases |order|
  {
    if order != [] {
      var s := order[0];
      var e := UnionOf(cl, Succ(succ, s));
      var next := if e != cl[s] then cl[s := cl[s] + e] else cl;
      forall x | x in e
        ensures Reaches(succ, s, x)
      {
        var t :| t in Succ(succ, s) && x in cl[t];
        ReachesStep(succ, s, t, x);
      }
      SweepFacts(states, succ, order[1..], next);
    }
  }

  /** Every state a sweep pops ends with all its epsilon targets in its closure. */
  lemma {:induction false} SweepHoldsTargets<S(!new)>(
    states: set<S>, succ: map<S, set<S>>, order: seq<S>, cl: map<S, set<S>>)
    requires TargetsAreStates(states, succ) && cl.Keys == states
    requires forall i :: 0 <= i < |order| ==> order[i] in states
    requires forall s :: s in states ==> s in cl[s]
    requires forall s, t :: s in states && t in cl[s] ==> Reaches(succ, s, t)
    ensures Sweep(succ, order, cl).Keys == states
    ensures forall i, t :: 0 <= i < |order| && t in Succ(succ, order[i]) ==> t in Sweep(succ, order, cl)[order[i]]
    decreases |order|
  {
    SweepFacts(states, succ, order, cl);
    if order != [] {
      var s := order[0];
      var e := UnionOf(cl, Succ(succ, s));
      var next := if e != cl[s] then cl[s := cl[s] + e] else cl;
      forall t | t in Succ(succ, s)
        ensures t in next[s]
      {
        assert t in cl[t];
      }
      forall x | x in e
        ensures Reaches(succ, s, x)
      {
        var t :| t in Succ(succ, s) && x in cl[t];
        ReachesStep(succ, s, t, x);
      }
      SweepFacts(states, succ, order[1..], next);
      SweepHoldsTargets(states, succ, order[1..], next);
      forall i, t | 0 <= i < |order| && t in Succ(succ, order[i])
        ensures t in Sweep(succ, order, cl)[order[i]]
      {
        if i > 0 {
          assert order[1..][i - 1] == order[i];
        }
      }
    }
  }

  /**
   * A sweep from the singleton closures: every closure is reflexive and sound, every popped state
   * holds its epsilon targets, and once the result is closed under the epsilon edges it is exact.
   */
  lemma SweepFromInitial<S(!new)>(states: set<S>, succ: map<S, set<S>>, order: seq<S>)
    requires TargetsAreStates(states, succ)
    requires forall i :: 0 <= i < |order| ==> order[i] in states
    ensures Sweep(succ, order, Initial(states)).Keys == states
    ensures forall s :: s in states ==> s in Sweep(succ, order, Initial(states))[s]
    ensures forall s, t :: s in states && t in Sweep(succ, order, Initial(states))[s] ==> Reaches(succ, s, t)
    ensures forall i, t :: 0 <= i < |order| && t in Succ(succ, order[i]) ==>
      t in Sweep(succ, order, Initial(states))[order[i]]
    ensures IsEnumeration(order, states) ==>
      forall s, t :: s in states && t in Succ(succ, s) ==> t in Sweep(succ, order, Initial(states))[s]
    ensures (forall s, t :: s in states && t in Succ(succ, s) ==>
      Sweep(succ, order, Initial(states))[t] <= Sweep(succ, order, Initial(states))[s])
      ==> IsClosureMap(succ, states, Sweep(succ, order, Initial(states)))
  {
    var init := Initial(states);
    forall s, t | s in states && t in init[s]
      ensures Reaches(succ, s, t)
    {
      ReachesRefl(succ, s);
    }
    SweepFacts(states, succ, order, init);
    SweepHoldsTargets(states, succ, order, init);
    var r := Sweep(succ, order, init);
    forall s | s in states
      ensures s in r[s]
    {
      assert s in init[s];
    }
    if IsEnumeration(order, states) {
      EnumerationCovers(order, states);
      forall s, t | s in states && t in Succ(succ, s)
        ensures t in r[s]
      {
        var i :| 0 <= i < |order| && order[i] == s;
      }
    }
    if forall s, t :: s in states && t in Succ(succ, s) ==> r[t] <= r[s] {
      forall s, u | s in states && Reaches(succ, s, u)
        ensures u in r[s]
      {
        var p :| IsPath(succ, p) && p[0] == s && p[|p| - 1] == u;
        ClosedIsComplete(succ, states, r, p);
      }
    }
  }

  /** A sequence without repetitions has as many distinct elements as it is long. */
  lemma {:induction false} DistinctElements<S>(order: seq<S>)
    requires forall i, j :: 0 <= i < j < |order| ==> order[i] != order[j]
    ensures |set x | x in order| == |order|
    decreases |order|
  {
    if order != [] {
      DistinctElements(order[1..]);
      var rest := set x | x in order[1..];
      assert (set x | x in order) == rest + {order[0]};
      assert order[0] !in rest;
    }
  }

  /** An enumeration of the states lists each of them. */
  lemma EnumerationCovers<S>(order: seq<S>, states: set<S>)
    requires IsEnumeration(order, states)
    ensures forall s :: s in states ==> s in order
  {
    var listed := set x | x in order;
    DistinctElements(order);
    assert listed + states == states && listed * states == listed;
    assert |states - listed| == 0;
  }

  /**
   * __create_epsilon_closures as written. The pop order of the set is not determined by the
   * program; it is returned as `order`, and the result is one Sweep in that order.
   */
  method EpsilonClosuresAsWritten<S(!new)>(states: set<S>, succ: map<S, set<S>>)
    returns (cl: map<S, set<S>>, ghost order: seq<S>)
    requires TargetsAreStates(states, succ)
    ensures IsEnumeration(order, states)
    ensures cl == Sweep(succ, order, Initial(states))
    ensures cl.Keys == states
    ensures forall s :: s in states ==> s in cl[s]
    ensures forall s, t :: s in states && t in cl[s] ==> Reaches(succ, s, t)
  {
    cl := Initial(states);
    var work := states;
    order := [];
    while work != {}
      invariant work <= states && cl.Keys == states
      invariant forall i :: 0 <= i < |order| ==> order[i] in states && order[i] !in work
      invariant forall i, j :: 0 <= i < j < |order| ==> order[i] != order[j]
      invariant |order| + |work| == |states|
      invariant Sweep(succ, order, Initial(states)) == cl
      decreases |work|
    {
      var s :| s in work;
      work := work - {s};
      var e := UnionOf(cl, Succ(succ, s));
      if e != cl[s] {
        cl := cl[s := cl[s] + e];
      }
      SweepSnoc(succ, order, s, Initial(states));
      order := order + [s];
    }
    forall s | s in states
      ensures Reaches(succ, s, s)
    {
      ReachesRefl(succ, s);
    }
    SweepFacts(states, succ, order, Initial(states));
  }

  /** Sweeping one more state extends the pass by one update. */
  lemma {:induction false} SweepSnoc<S>(succ: map<S, set<S>>, order: seq<S>, s: S, cl: map<S, set<S>>)
    requires forall i :: 0 <= i < |order| ==> order[i] in cl && Succ(succ, order[i]) <= cl.Keys
    requires s in cl && Succ(succ, s) <= cl.Keys
    ensures Sweep(succ, order, cl).Keys == cl.Keys
    ensures var mid := Sweep(succ, order, cl);
      var e := UnionOf(mid, Succ(succ, s));
      Sweep(succ, order + [s], cl) == if e != mid[s] then mid[s := mid[s] + e] else mid
    decreases |order|
  {
    if order == [] {
      assert order + [s] == [s];
    } else {
      var t := order[0];
      var e := UnionOf(cl, Succ(succ, t));
      var next := if e != cl[t] then cl[t := cl[t] + e] else cl;
      assert (order + [s])[1..] == order[1..] + [s];
      SweepSnoc(succ, order[1..], s, next);
    }
  }

  /**
   * The discarded re-enqueue loses closure members: on the chain 0 -> 1 -> 2, popping 0 first
   * fixes closure(0) = {0, 1} before closure(1) has learnt about 2, and 0 is never revisited.
   */
  lemma SweepMissesChain()
    ensures var succ := Chain();
      && IsEnumeration([0, 1, 2], {0, 1, 2})
      && Reaches(succ, 0, 2)
      && 2 !in Sweep(succ, [0, 1, 2], Initial({0, 1, 2}))[0]
  {
    var succ := Chain();
    assert IsPath(succ, [0, 1, 2]);
    assert |{0, 1, 2}| == 3;
    ChainSweep();
  }

  /** The epsilon edges of the chain 0 -> 1 -> 2. */
  function Chain(): map<int, set<int>> {
    map[0 := {1}, 1 := {2}]
  }

  /** The union of the closures of a single target is that target's closure. */
  lemma UnionOfOne<S>(cl: map<S, set<S>>, t: S)
    requires t in cl
    ensures UnionOf(cl, {t}) == cl[t]
  {
    forall x | x in cl[t]
      ensures x in UnionOf(cl, {t})
    {
      assert t in {t} && x in cl[t];
    }
  }

  /** Popping 0 from the initial map: closure(0) becomes {0, 1}. */
  lemma ChainSweepFirst()
    ensures Sweep(Chain(), [0, 1, 2], Initial({0, 1, 2}))
         == Sweep(Chain(), [1, 2], Initial({0, 1, 2})[0 := {0, 1}])
  {
    var c0 := Initial({0, 1, 2});
    assert [0, 1, 2][1..] == [1, 2];
    assert Succ(Chain(), 0) == {1};
    UnionOfOne(c0, 1);
    assert c0[0] + {1} == {0, 1} && {1} != c0[0];
  }

  /** Popping 1 next: closure(1) becomes {1, 2}, closure(0) stays {0, 1}. */
  lemma ChainSweepSecond()
    ensures Sweep(Chain(), [1, 2], Initial({0, 1, 2})[0 := {0, 1}])
         == Sweep(Chain(), [2], Initial({0, 1, 2})[0 := {0, 1}][1 := {1, 2}])
  {
    var c1 := Initial({0, 1, 2})[0 := {0, 1}];
    assert [1, 2][1..] == [2];
    assert Succ(Chain(), 1) == {2};
    UnionOfOne(c1, 2);
    assert c1[1] + {2} == {1, 2} && {2} != c1[1];
  }

  /** Popping 2 last changes nothing: 2 has no epsilon edge. */
  lemma ChainSweepLast()
    ensures Sweep(Chain(), [2], Initial({0, 1, 2})[0 := {0, 1}][1 := {1, 2}])[0] == {0, 1}
  {
    var c2 := Initial({0, 1, 2})[0 := {0, 1}][1 := {1, 2}];
    assert [2][1..] == [];
    assert Succ(Chain(), 2) == {};
    assert UnionOf(c2, {}) == {};
  }

  /** The pass over the chain in the order 0, 1, 2, step by step. */
  lemma ChainSweep()
    ensures Sweep(Chain(), [0, 1, 2], Initial({0, 1, 2}))[0] == {0, 1}
  {
    ChainSweepFirst();
    ChainSweepSecond();
    ChainSweepLast();
  }
}
